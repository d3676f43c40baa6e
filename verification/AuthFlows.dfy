/** The login, second-factor and refresh flows over arbitrary server replies, and what
    holds over every run that mixes them with commands. */
module AuthFlows {
  import opened Prelude
  import opened AuthSession
  import AuthRefresh

  datatype ApiError = ApiError(message: string)

  datatype UserInfo = UserInfo(user: Option<nat>, email: Option<string>)

  datatype LoginOutcome =
    | Accepted(token: Secret, user: Option<nat>)
    | SecondFactor(challenge: Secret, trustDevice: bool)
    | Rejected(message: Option<string>)

  datatype RefreshFailure = TokenExpired(result: nat) | NoAuthField | Temporary(message: string)

  /** The server's replies during one flow: any functions whatever. */
  datatype Server = Server(
    userinfo: Secret -> Result<UserInfo, ApiError>,
    login: (string, Secret) -> Result<LoginOutcome, ApiError>,
    submitCode: (Secret, Secret, bool, bool) -> Result<LoginOutcome, ApiError>,
    loginWithCode: (string, Secret, Secret) -> Result<LoginOutcome, ApiError>,
    refresh: Secret -> Result<Secret, RefreshFailure>)

  datatype FlowError = FromSession(e: Error) | FromProtocol(api: ApiError)

  datatype RefreshError = NotAuthenticated | Gone(result: nat) | RetryLater(message: string) | FromManager(e: Error) | MissingAuthField

  function Or(a: Option<nat>, b: Option<nat>): Option<nat> {
    if a.Some? then a else b
  }

  // ----- What the flows do, on values -----

  function Failed(s: Session, message: string): Session {
    Applied(s, MarkAuthenticationFailed(Some(message))).0
  }

  /** The session with an authenticated token. */
  function SignedIn(s: Session, user: Option<nat>, token: Secret, email: Option<string>): Session {
    s.(snapshot := Snapshot(Authenticated, user, Some(token), email, None, None))
  }

  function TokenLogin(server: Server, s: Session, token: Secret): (Session, Result<Event, FlowError>) {
    var started := Started(s, AuthenticatingWithToken);
    var info := server.userinfo(token);
    if info.Err? then (Failed(started, info.error.message), Err(FromProtocol(info.error)))
    else (SignedIn(started, info.value.user, token, info.value.email), Ok(LoginSucceeded(info.value.user)))
  }

  /** Once the server accepted a login, its token is looked up. When that fails the
      session stays as it is. */
  function Confirmed(server: Server, s: Session, token: Secret, user: Option<nat>): (Session, Result<Event, FlowError>) {
    var info := server.userinfo(token);
    if info.Err? then (s, Err(FromProtocol(info.error)))
    else
      var who := Or(info.value.user, user);
      (SignedIn(s, who, token, info.value.email), Ok(LoginSucceeded(who)))
  }

  /** The rest of a login that may ask for a second factor. A soft failure keeps the
      challenge when a code was submitted for it. */
  function Concluded(server: Server, s: Session, reply: Result<LoginOutcome, ApiError>, soft: bool)
    : (Session, Result<Event, FlowError>)
  {
    if reply.Err? then (Failed(s, reply.error.message), Err(FromProtocol(reply.error)))
    else
      match reply.value
      case Accepted(token, user) => Confirmed(server, s, token, user)
      case SecondFactor(challenge, trust) => (Challenged(s, challenge, trust), Ok(TwoFactorChallengeIssued))
      case Rejected(message) =>
        var command := if soft then MarkTwoFactorCodeInvalid(message) else MarkAuthenticationFailed(message);
        (Applied(s, command).0, Ok(LoginFailed(message)))
  }

  function PasswordLogin(server: Server, s: Session, username: string, password: Secret): (Session, Result<Event, FlowError>) {
    Concluded(server, Started(s, AuthenticatingWithPassword), server.login(username, password), false)
  }

  function CodeSubmission(server: Server, s: Session, code: Secret, trust: bool, recovery: bool)
    : (Session, Result<Event, FlowError>)
  {
    if s.snapshot.challenge.None? then (s, Err(FromSession(NoPendingChallenge)))
    else
      var submitted := Applied(s, SubmitTwoFactorCode(code, trust)).0;
      Concluded(server, submitted, server.submitCode(s.snapshot.challenge.value.token, code, trust, recovery), true)
  }

  function CodeWithPassword(server: Server, s: Session, username: string, password: Secret, code: Secret)
    : (Session, Result<Event, FlowError>)
  {
    if s.snapshot.challenge.None? then (s, Err(FromSession(NoPendingChallenge)))
    else
      var submitted := Applied(s, SubmitTwoFactorCode(code, false)).0;
      Concluded(server, submitted, server.loginWithCode(username, password, code), false)
  }

  function TokenRefresh(server: Server, s: Session, current: Secret): (Session, Result<Event, RefreshError>) {
    if s.snapshot.state != Authenticated then (s, Err(NotAuthenticated))
    else
      match server.refresh(current)
      case Ok(token) => (ReplacedToken(s, token).0, Ok(TokenRefreshed(s.snapshot.user)))
      case Err(TokenExpired(result)) => (Session(NOBODY, None), Err(Gone(result)))
      case Err(NoAuthField) => (s, Err(MissingAuthField))
      case Err(Temporary(message)) => (s, Err(RetryLater(message)))
  }

  // ----- How each flow ends, by the server's replies -----

  /** How a login ends that began in `s` and asked the server when it stood at `asked`.
      A sign-in takes the token from the reply, the address from the look-up, and the
      user from the look-up or else from the reply; a failure leaves nothing. */
  ghost predicate EndsAs(
    server: Server, asked: Session, reply: Result<LoginOutcome, ApiError>, soft: bool,
    after: Session, r: Result<Event, FlowError>)
  {
    match reply
    case Err(ApiError(message)) =>
      && after == Session(Snapshot(AuthFailed, None, None, None, None, Some(message)), None)
      && r == Err(FromProtocol(ApiError(message)))
    case Ok(Rejected(message)) =>
      && r == Ok(LoginFailed(message))
      && after == if soft then asked.(snapshot := asked.snapshot.(lastError := message))
                  else Session(Snapshot(AuthFailed, None, None, None, None, message), None)
    case Ok(SecondFactor(challenge, trust)) =>
      && r == Ok(TwoFactorChallengeIssued)
      && after == asked.(snapshot := asked.snapshot.(
           state := TwoFactorRequired, challenge := Some(Challenge(challenge, trust)), lastError := None))
    case Ok(Accepted(token, user)) =>
      match server.userinfo(token)
      case Err(e) => after == asked && r == Err(FromProtocol(e))
      case Ok(UserInfo(known, email)) =>
        var who := if known == None then user else known;
        && r == Ok(LoginSucceeded(who))
        && after == Session(Snapshot(Authenticated, who, Some(token), email, None, None), asked.lifecycle)
  }

  /** The login with a password. */
  lemma PasswordLoginExactly(server: Server, s: Session, username: string, password: Secret)
    ensures var (after, r) := PasswordLogin(server, s, username, password);
            var asked := s.(snapshot := s.snapshot.(state := AuthenticatingWithPassword, challenge := None, lastError := None));
            EndsAs(server, asked, server.login(username, password), false, after, r)
  {
  }

  /** The code for an open challenge, which the server is told. */
  lemma CodeSubmissionExactly(server: Server, s: Session, code: Secret, trust: bool, recovery: bool)
    ensures var (after, r) := CodeSubmission(server, s, code, trust, recovery);
            match s.snapshot.challenge
            case None => after == s && r == Err(FromSession(NoPendingChallenge))
            case Some(Challenge(token, _)) =>
              var asked := s.(snapshot := s.snapshot.(
                state := AuthenticatingWithPassword, challenge := Some(Challenge(token, trust))));
              EndsAs(server, asked, server.submitCode(token, code, trust, recovery), true, after, r)
  {
  }

  /** Password and code in one request: a rejection fails the session, and the device is
      not trusted. */
  lemma CodeWithPasswordExactly(server: Server, s: Session, username: string, password: Secret, code: Secret)
    ensures var (after, r) := CodeWithPassword(server, s, username, password, code);
            match s.snapshot.challenge
            case None => after == s && r == Err(FromSession(NoPendingChallenge))
            case Some(Challenge(token, _)) =>
              var asked := s.(snapshot := s.snapshot.(
                state := AuthenticatingWithPassword, challenge := Some(Challenge(token, false))));
              EndsAs(server, asked, server.loginWithCode(username, password, code), false, after, r)
  {
  }

  /** The login with a token the caller holds. */
  lemma TokenLoginExactly(server: Server, s: Session, token: Secret)
    ensures var (after, r) := TokenLogin(server, s, token);
            match server.userinfo(token)
            case Err(ApiError(message)) =>
              && after == Session(Snapshot(AuthFailed, None, None, None, None, Some(message)), None)
              && r == Err(FromProtocol(ApiError(message)))
            case Ok(UserInfo(user, email)) =>
              && after == Session(Snapshot(Authenticated, user, Some(token), email, None, None), s.lifecycle)
              && r == Ok(LoginSucceeded(user))
  {
  }

  /** A refresh of the token: a new one replaces it, an expired one ends the session, and
      any other failure changes nothing. */
  lemma TokenRefreshExactly(server: Server, s: Session, current: Secret)
    ensures var (after, r) := TokenRefresh(server, s, current);
            if s.snapshot.state != Authenticated then after == s && r == Err(NotAuthenticated)
            else
              match server.refresh(current)
              case Ok(token) =>
                after == s.(snapshot := s.snapshot.(token := Some(token))) && r == Ok(TokenRefreshed(s.snapshot.user))
              case Err(TokenExpired(result)) =>
                after == Session(Snapshot(LoggedOut, None, None, None, None, None), None) && r == Err(Gone(result))
              case Err(NoAuthField) => after == s && r == Err(MissingAuthField)
              case Err(Temporary(message)) => after == s && r == Err(RetryLater(message))
  {
  }

  // ----- The flows, driving a manager: where a command's answer is passed on unread, the
  // manager is shown not to refuse it -----

  class ProtocolAuthFlow {
    const api: Server

    constructor (api: Server)
      ensures this.api == api
    {
      this.api := api;
    }

    method LoginWithToken(session: SessionManager, token: Secret) returns (r: Result<Event, FlowError>)
      modifies session
      ensures (session.Contents(), r) == TokenLogin(api, old(session.Contents()), token)
    {
      var _ := session.Apply(AuthSession.LoginWithToken(token));
      var info := api.userinfo(token);
      if info.Err? {
        var _ := session.Apply(MarkAuthenticationFailed(Some(info.error.message)));
        return Err(FromProtocol(info.error));
      }
      var marked := session.Apply(MarkAuthenticated(info.value.user, token));
      assert marked.Ok?;
      var updated := session.UpdateUserinfo(info.value.user, info.value.email);
      assert updated.Ok?;
      return Ok(marked.value);
    }

    method LoginWithPassword(session: SessionManager, username: string, password: Secret) returns (r: Result<Event, FlowError>)
      modifies session
      ensures (session.Contents(), r) == PasswordLogin(api, old(session.Contents()), username, password)
    {
      var _ := session.Apply(AuthSession.LoginWithPassword(username, password));
      r := Conclude(session, api.login(username, password), false);
    }

    method SubmitCode(session: SessionManager, code: Secret, trust: bool, recovery: bool) returns (r: Result<Event, FlowError>)
      modifies session
      ensures (session.Contents(), r) == CodeSubmission(api, old(session.Contents()), code, trust, recovery)
    {
      if session.snapshot.challenge.None? {
        return Err(FromSession(NoPendingChallenge));
      }
      var challenge := session.snapshot.challenge.value.token;
      var submitted := session.Apply(SubmitTwoFactorCode(code, trust));
      assert submitted.Ok?;
      r := Conclude(session, api.submitCode(challenge, code, trust, recovery), true);
    }

    method SubmitCodeWithPassword(session: SessionManager, username: string, password: Secret, code: Secret)
      returns (r: Result<Event, FlowError>)
      modifies session
      ensures (session.Contents(), r) == CodeWithPassword(api, old(session.Contents()), username, password, code)
    {
      var submitted := session.Apply(SubmitTwoFactorCode(code, false));
      if submitted.Err? {
        return Err(FromSession(submitted.error));
      }
      r := Conclude(session, api.loginWithCode(username, password, code), false);
    }

    /** Folds the server's answer to a login into the session. */
    method Conclude(session: SessionManager, reply: Result<LoginOutcome, ApiError>, soft: bool)
      returns (r: Result<Event, FlowError>)
      requires session.snapshot.state == AuthenticatingWithPassword
      modifies session
      ensures (session.Contents(), r) == Concluded(api, old(session.Contents()), reply, soft)
    {
      if reply.Err? {
        var _ := session.Apply(MarkAuthenticationFailed(Some(reply.error.message)));
        return Err(FromProtocol(reply.error));
      }
      match reply.value {
        case Accepted(token, user) =>
          var info := api.userinfo(token);
          if info.Err? {
            return Err(FromProtocol(info.error));
          }
          var who := Or(info.value.user, user);
          var marked := session.Apply(MarkAuthenticated(who, token));
          assert marked.Ok?;
          var updated := session.UpdateUserinfo(who, info.value.email);
          assert updated.Ok?;
          return Ok(marked.value);
        case SecondFactor(challenge, trust) =>
          var e := session.IssueTwoFactorChallenge(challenge, trust);
          return Ok(e);
        case Rejected(message) =>
          var answered := session.Apply(if soft then MarkTwoFactorCodeInvalid(message) else MarkAuthenticationFailed(message));
          assert answered.Ok?;
          return Ok(answered.value);
      }
    }

    method RefreshToken(session: SessionManager, current: Secret) returns (r: Result<Event, RefreshError>)
      modifies session
      ensures (session.Contents(), r) == TokenRefresh(api, old(session.Contents()), current)
    {
      if session.snapshot.state != Authenticated {
        return Err(NotAuthenticated);
      }
      match api.refresh(current) {
        case Ok(token) =>
          var replaced := session.ReplaceAuthToken(token);
          assert replaced.Ok?;
          return Ok(TokenRefreshed(session.snapshot.user));
        case Err(TokenExpired(result)) =>
          var _ := session.Revoke();
          return Err(Gone(result));
        case Err(NoAuthField) =>
          return Err(MissingAuthField);
        case Err(Temporary(message)) =>
          return Err(RetryLater(message));
      }
    }
  }

  // ----- Runs -----

  /** Everything that can happen to a session. Each flow meets its own server replies,
      so over a run they are arbitrary; a refresh may find the ticket held elsewhere. */
  datatype Action =
    | Do(command: Command)
    | Issue(challenge: Secret, trust: bool)
    | Attach(now: nat, policy: Policy, retained: bool)
    | Use(now: nat)
    | Record(now: nat, policy: Policy, token: Secret)
    | Revoke
    | Update(user: Option<nat>, email: Option<string>)
    | Replace(token: Secret)
    | ByToken(server: Server, token: Secret)
    | ByPassword(server: Server, username: string, password: Secret)
    | ByCode(server: Server, code: Secret, trust: bool, recovery: bool)
    | ByCodeAndPassword(server: Server, username: string, password: Secret, code: Secret)
    | Renew(server: Server, current: Secret)
    | RunRefresh(held: bool, now: nat, policy: Policy, reply: AuthRefresh.Reply)
    | ExpirySignal(held: bool, now: nat, policy: Policy, reauth: Option<AuthRefresh.Reply>)

  function Step(s: Session, a: Action): Session {
    match a
    case Do(command) => Applied(s, command).0
    case Issue(challenge, trust) => Challenged(s, challenge, trust)
    case Attach(now, policy, retained) => s.(lifecycle := Some(NewLifecycle(now, policy, retained)))
    case Use(now) => s.(lifecycle := Used(s.lifecycle, now))
    case Record(now, policy, token) => RecordedRefresh(s, now, policy, token).0
    case Revoke => Session(NOBODY, None)
    case Update(user, email) => UpdatedUserinfo(s, user, email).0
    case Replace(token) => ReplacedToken(s, token).0
    case ByToken(server, token) => TokenLogin(server, s, token).0
    case ByPassword(server, username, password) => PasswordLogin(server, s, username, password).0
    case ByCode(server, code, trust, recovery) => CodeSubmission(server, s, code, trust, recovery).0
    case ByCodeAndPassword(server, username, password, code) => CodeWithPassword(server, s, username, password, code).0
    case Renew(server, current) => TokenRefresh(server, s, current).0
    case RunRefresh(held, now, policy, reply) => if held then s else AuthRefresh.RanRefresh(s, now, policy, reply).0
    case ExpirySignal(held, now, policy, reauth) =>
      if held && AuthRefresh.TriesAgain(s, reauth) then s
      else AuthRefresh.HandledExpiry(s, now, policy, reauth).0
  }

  function After(run: seq<Action>, n: nat): Session
    requires n <= |run|
  {
    if n == 0 then Session(NOBODY, None) else Step(After(run, n - 1), run[n - 1])
  }

  lemma ConcludedIsSound(server: Server, s: Session, reply: Result<LoginOutcome, ApiError>, soft: bool)
    requires IsSound(s.snapshot) && s.snapshot.state == AuthenticatingWithPassword
    ensures IsSound(Concluded(server, s, reply, soft).0.snapshot)
  {
  }

  lemma StepIsSound(s: Session, a: Action)
    requires IsSound(s.snapshot)
    ensures IsSound(Step(s, a).snapshot)
  {
    match a
    case Do(command) => CommandsKeepSound(s, command);
    case ByPassword(server, username, password) =>
      ConcludedIsSound(server, Started(s, AuthenticatingWithPassword), server.login(username, password), false);
    case ByCode(server, code, trust, recovery) =>
      if s.snapshot.challenge.Some? {
        var submitted := Applied(s, SubmitTwoFactorCode(code, trust)).0;
        ConcludedIsSound(server, submitted, server.submitCode(s.snapshot.challenge.value.token, code, trust, recovery), true);
      }
    case ByCodeAndPassword(server, username, password, code) =>
      if s.snapshot.challenge.Some? {
        var submitted := Applied(s, SubmitTwoFactorCode(code, false)).0;
        ConcludedIsSound(server, submitted, server.loginWithCode(username, password, code), false);
      }
    case _ =>
  }

  /** Over every run, from a fresh manager, whatever the server answers. */
  lemma {:induction false} RunIsSound(run: seq<Action>, n: nat)
    requires n <= |run|
    ensures IsSound(After(run, n).snapshot)
  {
    if n > 0 {
      RunIsSound(run, n - 1);
      StepIsSound(After(run, n - 1), run[n - 1]);
    }
  }

  // ----- Where a token comes from -----

  predicate Vouches(server: Server, reply: Result<LoginOutcome, ApiError>, token: Secret) {
    && reply.Ok? && reply.value.Accepted? && reply.value.token == token
    && server.userinfo(token).Ok?
  }

  /** The action brings the token: a flow does only when the server vouched for it, by
      accepting a login and knowing its user, or by answering a refresh with it. */
  ghost predicate Brings(a: Action, token: Secret) {
    match a
    case Do(command) => command.MarkAuthenticated? && command.authToken == token
    case Record(_, _, t) => t == token
    case Replace(t) => t == token
    case ByToken(server, t) => t == token && server.userinfo(token).Ok?
    case ByPassword(server, username, password) => Vouches(server, server.login(username, password), token)
    case ByCode(server, code, trust, recovery) =>
      exists challenge :: Vouches(server, server.submitCode(challenge, code, trust, recovery), token)
    case ByCodeAndPassword(server, username, password, code) =>
      Vouches(server, server.loginWithCode(username, password, code), token)
    case Renew(server, current) => server.refresh(current) == Ok(token)
    case RunRefresh(_, _, _, reply) => reply == AuthRefresh.Fresh(token)
    case ExpirySignal(_, _, _, reauth) => reauth == Some(AuthRefresh.Fresh(token))
    case _ => false
  }

  lemma ConcludedToken(server: Server, s: Session, reply: Result<LoginOutcome, ApiError>, soft: bool)
    requires s.snapshot.state == AuthenticatingWithPassword
    ensures var after := Concluded(server, s, reply, soft).0.snapshot;
            && (after.token.Some? ==> after.token == s.snapshot.token || Vouches(server, reply, after.token.value))
            && (after.state == Authenticated ==> after.token.Some? && Vouches(server, reply, after.token.value))
  {
  }

  /** A step keeps the token, drops it, or puts in place one it brings; and a session
      becomes authenticated only with a token the step brings. */
  lemma StepToken(s: Session, a: Action)
    ensures var after := Step(s, a).snapshot;
            && (after.token.Some? ==> after.token == s.snapshot.token || Brings(a, after.token.value))
            && (after.state == Authenticated && s.snapshot.state != Authenticated ==>
                  after.token.Some? && Brings(a, after.token.value))
  {
    match a
    case ByPassword(server, username, password) =>
      ConcludedToken(server, Started(s, AuthenticatingWithPassword), server.login(username, password), false);
    case ByCode(server, code, trust, recovery) =>
      if s.snapshot.challenge.Some? {
        var submitted := Applied(s, SubmitTwoFactorCode(code, trust)).0;
        var challenge := s.snapshot.challenge.value.token;
        ConcludedToken(server, submitted, server.submitCode(challenge, code, trust, recovery), true);
      }
    case ByCodeAndPassword(server, username, password, code) =>
      if s.snapshot.challenge.Some? {
        var submitted := Applied(s, SubmitTwoFactorCode(code, false)).0;
        ConcludedToken(server, submitted, server.loginWithCode(username, password, code), false);
      }
    case _ =>
  }

  /** A token held at any moment was brought by an earlier action, and since then the
      session was neither logged out nor failed. */
  lemma {:induction false} TokenHasOrigin(run: seq<Action>, n: nat) returns (i: nat)
    requires n <= |run| && After(run, n).snapshot.token.Some?
    ensures i < n && Brings(run[i], After(run, n).snapshot.token.value)
    ensures forall j | i < j <= n :: !IsOver(After(run, j).snapshot.state)
  {
    RunIsSound(run, n);
    StepToken(After(run, n - 1), run[n - 1]);
    if Brings(run[n - 1], After(run, n).snapshot.token.value) {
      i := n - 1;
    } else {
      i := TokenHasOrigin(run, n - 1);
    }
  }

  /** Which actions answer with a login that succeeded. */
  ghost predicate ReportsSuccess(s: Session, a: Action) {
    match a
    case Do(command) => Applied(s, command).1.Ok? && Applied(s, command).1.value.LoginSucceeded?
    case ByToken(server, token) => TokenLogin(server, s, token).1.Ok?
    case ByPassword(server, username, password) => SaysSucceeded(PasswordLogin(server, s, username, password).1)
    case ByCode(server, code, trust, recovery) => SaysSucceeded(CodeSubmission(server, s, code, trust, recovery).1)
    case ByCodeAndPassword(server, username, password, code) =>
      SaysSucceeded(CodeWithPassword(server, s, username, password, code).1)
    case _ => false
  }

  predicate SaysSucceeded(r: Result<Event, FlowError>) {
    r.Ok? && r.value.LoginSucceeded?
  }

  lemma ConcludedReports(server: Server, s: Session, reply: Result<LoginOutcome, ApiError>, soft: bool)
    requires s.snapshot.state == AuthenticatingWithPassword
    ensures SaysSucceeded(Concluded(server, s, reply, soft).1)
            <==> Concluded(server, s, reply, soft).0.snapshot.state == Authenticated
  {
  }

  /** The answer tells the truth: a login is reported exactly by the steps that leave
      the session newly, or again, authenticated by a login. */
  lemma ReportsAreTrue(s: Session, a: Action)
    ensures ReportsSuccess(s, a) ==> Step(s, a).snapshot.state == Authenticated
    ensures s.snapshot.state != Authenticated && Step(s, a).snapshot.state == Authenticated ==> ReportsSuccess(s, a)
  {
    match a
    case ByPassword(server, username, password) =>
      ConcludedReports(server, Started(s, AuthenticatingWithPassword), server.login(username, password), false);
    case ByCode(server, code, trust, recovery) =>
      if s.snapshot.challenge.Some? {
        var submitted := Applied(s, SubmitTwoFactorCode(code, trust)).0;
        ConcludedReports(server, submitted, server.submitCode(s.snapshot.challenge.value.token, code, trust, recovery), true);
      }
    case ByCodeAndPassword(server, username, password, code) =>
      if s.snapshot.challenge.Some? {
        var submitted := Applied(s, SubmitTwoFactorCode(code, false)).0;
        ConcludedReports(server, submitted, server.loginWithCode(username, password, code), false);
      }
    case _ =>
  }

  // ----- Second factors -----

  /** After a code the server turns down softly, the same challenge can be answered
      again: a later accepted code signs in. The state in between is that of a password
      login under way, not that of a required second factor. */
  lemma SoftFailureCanBeRetried(
    server: Server, again: Server, s: Session, code: Secret, trust: bool, recovery: bool,
    next: Secret, trustNext: bool, recoveryNext: bool)
    requires s.snapshot.challenge.Some?
    requires var reply := server.submitCode(s.snapshot.challenge.value.token, code, trust, recovery);
             reply.Ok? && reply.value.Rejected?
    ensures var (kept, answer) := CodeSubmission(server, s, code, trust, recovery);
            && kept.snapshot.state == AuthenticatingWithPassword
            && kept.snapshot.challenge == Some(Challenge(s.snapshot.challenge.value.token, trust))
            && kept.snapshot.token == s.snapshot.token && kept.lifecycle == s.lifecycle
            && answer.Ok? && answer.value.LoginFailed?
            && var (after, second) := CodeSubmission(again, kept, next, trustNext, recoveryNext);
               var reply := again.submitCode(s.snapshot.challenge.value.token, next, trustNext, recoveryNext);
               (SaysSucceeded(second) <==> reply.Ok? && reply.value.Accepted? && again.userinfo(reply.value.token).Ok?)
  {
  }

  /** A submitted code leaves the second factor required exactly when the server asks
      for another one. */
  lemma CodeLeavesFactorRequired(server: Server, s: Session, code: Secret, trust: bool, recovery: bool)
    requires s.snapshot.challenge.Some?
    ensures var reply := server.submitCode(s.snapshot.challenge.value.token, code, trust, recovery);
            CodeSubmission(server, s, code, trust, recovery).0.snapshot.state == TwoFactorRequired
            <==> reply.Ok? && reply.value.SecondFactor?
  {
  }

  /** How the flow of a login ends in an error, given the session as it stood when the
      server was asked: the session has failed; or the server accepted the login but
      its user could not be looked up, and the session still stands there. */
  ghost predicate EndsInError(server: Server, asked: Session, reply: Result<LoginOutcome, ApiError>, after: Session) {
    if reply.Ok? then
      reply.value.Accepted? && server.userinfo(reply.value.token).Err? && after == asked
    else after.snapshot.state == AuthFailed && after.snapshot.token.None? && after.lifecycle.None?
  }

  lemma ConcludedErrors(server: Server, s: Session, reply: Result<LoginOutcome, ApiError>, soft: bool)
    ensures var (after, r) := Concluded(server, s, reply, soft);
            r.Err? ==> EndsInError(server, s, reply, after)
  {
  }

  /** The login with a token is the exception: there a failed look-up is the rejection,
      and fails the session. */
  lemma TokenLoginFails(server: Server, s: Session, token: Secret)
    ensures var (after, r) := TokenLogin(server, s, token);
            && (r.Err? <==> server.userinfo(token).Err?)
            && (r.Err? ==>
                  && r.error == FromProtocol(server.userinfo(token).error)
                  && after.snapshot == NOBODY.(state := AuthFailed, lastError := Some(r.error.api.message))
                  && after.lifecycle.None?)
  {
  }

  /** Of every login that names a user or a code and ends in an error: unlike a rejection, a failed look-up
      leaves the login under way, with the token held before and, for the code flows,
      the challenge. Without a challenge the code flows change nothing. */
  lemma LookupFailureKeepsToken(
    server: Server, s: Session, username: string, password: Secret, code: Secret, trust: bool, recovery: bool)
    ensures var (after, r) := PasswordLogin(server, s, username, password);
            var asked := Started(s, AuthenticatingWithPassword);
            && asked.snapshot.token == s.snapshot.token
            && (r.Err? ==> EndsInError(server, asked, server.login(username, password), after))
    ensures var (after, r) := CodeSubmission(server, s, code, trust, recovery);
            if s.snapshot.challenge.None? then r.Err? && after == s
            else
              var asked := Applied(s, SubmitTwoFactorCode(code, trust)).0;
              var reply := server.submitCode(s.snapshot.challenge.value.token, code, trust, recovery);
              && asked.snapshot.token == s.snapshot.token && asked.snapshot.challenge.Some?
              && (r.Err? ==> EndsInError(server, asked, reply, after))
    ensures var (after, r) := CodeWithPassword(server, s, username, password, code);
            if s.snapshot.challenge.None? then r.Err? && after == s
            else
              var asked := Applied(s, SubmitTwoFactorCode(code, false)).0;
              && asked.snapshot.token == s.snapshot.token && asked.snapshot.challenge.Some?
              && (r.Err? ==> EndsInError(server, asked, server.loginWithCode(username, password, code), after))
  {
    ConcludedErrors(server, Started(s, AuthenticatingWithPassword), server.login(username, password), false);
    if s.snapshot.challenge.Some? {
      var reply := server.submitCode(s.snapshot.challenge.value.token, code, trust, recovery);
      ConcludedErrors(server, Applied(s, SubmitTwoFactorCode(code, trust)).0, reply, true);
      ConcludedErrors(
        server, Applied(s, SubmitTwoFactorCode(code, false)).0, server.loginWithCode(username, password, code), false);
    }
  }
}
