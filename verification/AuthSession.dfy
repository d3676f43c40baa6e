/** The session state machine: commands, lifecycle timing and token replacement. */
module AuthSession {
  import opened Prelude

  const U64_MAX := 0xFFFF_FFFF_FFFF_FFFF

  type Secret = string

  datatype State =
    | LoggedOut
    | AwaitingCredentials
    | AuthenticatingWithPassword
    | AuthenticatingWithToken
    | TwoFactorRequired
    | Authenticated
    | AuthFailed

  datatype Challenge = Challenge(token: Secret, trustDevice: bool)

  datatype Snapshot = Snapshot(
    state: State, user: Option<nat>, token: Option<Secret>, email: Option<string>,
    challenge: Option<Challenge>, lastError: Option<string>)

  datatype Lifecycle = Lifecycle(establishedAt: nat, expiresAt: nat, lastUsedAt: nat, credentialsRetained: bool)

  /** A length of time in nanoseconds. Sessions count it in whole seconds. */
  type Duration = nat

  function WholeSeconds(d: Duration): nat {
    d / 1_000_000_000
  }

  /** The threshold is the share of the lifetime after which a refresh is due. */
  datatype Policy = Policy(lifetime: Duration, threshold: real, maxIdle: Option<Duration>)

  datatype Session = Session(snapshot: Snapshot, lifecycle: Option<Lifecycle>)

  datatype Command =
    | BeginLogin
    | LoginWithPassword(username: string, password: Secret)
    | LoginWithToken(loginToken: Secret)
    | SubmitTwoFactorCode(code: Secret, trustDevice: bool)
    | MarkAuthenticated(user: Option<nat>, authToken: Secret)
    | MarkAuthenticationFailed(message: Option<string>)
    | MarkTwoFactorCodeInvalid(message: Option<string>)
    | Logout

  datatype Event =
    | LoginStarted
    | LoginSucceeded(user: Option<nat>)
    | LoginFailed(message: Option<string>)
    | TwoFactorChallengeIssued
    | SessionEnded
    | TokenRefreshed(user: Option<nat>)

  datatype Error = NoPendingChallenge | InvalidAuthenticatedTransition

  const NOBODY := Snapshot(LoggedOut, None, None, None, None, None)

  // ----- What every step keeps -----

  predicate IsOver(state: State) {
    state == LoggedOut || state == AuthFailed
  }

  /** Authenticated means a token and no open challenge; a required second factor means
      a challenge; a session that is over holds nothing. */
  ghost predicate IsSound(s: Snapshot) {
    && (s.state == Authenticated ==> s.token.Some? && s.challenge.None?)
    && (s.state == TwoFactorRequired ==> s.challenge.Some?)
    && (IsOver(s.state) ==> s.token.None? && s.user.None? && s.email.None? && s.challenge.None?)
  }

  // ----- Timing -----

  function SaturatingAdd(a: nat, b: nat): nat {
    Min(a + b, U64_MAX)
  }

  function NewLifecycle(now: nat, policy: Policy, retained: bool): Lifecycle {
    Lifecycle(now, SaturatingAdd(now, WholeSeconds(policy.lifetime)), now, retained)
  }

  function Refreshed(lifecycle: Lifecycle, now: nat, policy: Policy): Lifecycle {
    NewLifecycle(now, policy, lifecycle.credentialsRetained)
  }

  // ----- The state machine on values -----

  function Started(s: Session, state: State): Session {
    s.(snapshot := s.snapshot.(state := state, challenge := None, lastError := None))
  }

  /** What a command does to a session, and what it answers. */
  function Applied(s: Session, c: Command): (Session, Result<Event, Error>) {
    var snap := s.snapshot;
    match c
    case BeginLogin =>
      (s.(snapshot := snap.(state := AwaitingCredentials, lastError := None)), Ok(LoginStarted))
    case LoginWithPassword(_, _) => (Started(s, AuthenticatingWithPassword), Ok(LoginStarted))
    case LoginWithToken(_) => (Started(s, AuthenticatingWithToken), Ok(LoginStarted))
    case SubmitTwoFactorCode(_, trust) =>
      if snap.challenge.None? then (s, Err(NoPendingChallenge))
      else
        var challenge := snap.challenge.value.(trustDevice := trust);
        (s.(snapshot := snap.(state := AuthenticatingWithPassword, challenge := Some(challenge))), Ok(LoginStarted))
    case MarkAuthenticated(user, token) =>
      if snap.state in {AuthenticatingWithPassword, AuthenticatingWithToken, TwoFactorRequired} then
        (s.(snapshot := Snapshot(Authenticated, user, Some(token), snap.email, None, None)), Ok(LoginSucceeded(user)))
      else (s, Err(InvalidAuthenticatedTransition))
    case MarkAuthenticationFailed(message) =>
      (Session(NOBODY.(state := AuthFailed, lastError := message), None), Ok(LoginFailed(message)))
    case MarkTwoFactorCodeInvalid(message) =>
      (s.(snapshot := snap.(lastError := message)), Ok(LoginFailed(message)))
    case Logout => (Session(NOBODY, None), Ok(SessionEnded))
  }

  function Challenged(s: Session, token: Secret, trust: bool): Session {
    s.(snapshot := s.snapshot.(
      state := TwoFactorRequired, challenge := Some(Challenge(token, trust)), lastError := None))
  }

  /** The recorded refresh, or nothing when the session is not authenticated. */
  function RecordedRefresh(s: Session, now: nat, policy: Policy, token: Secret): (Session, Result<(), Error>) {
    if s.snapshot.state != Authenticated then (s, Err(InvalidAuthenticatedTransition))
    else
      var lifecycle := if s.lifecycle.Some? then Refreshed(s.lifecycle.value, now, policy) else NewLifecycle(now, policy, false);
      (Session(s.snapshot.(token := Some(token)), Some(lifecycle)), Ok(()))
  }

  function UpdatedUserinfo(s: Session, user: Option<nat>, email: Option<string>): (Session, Result<(), Error>) {
    if s.snapshot.state != Authenticated then (s, Err(InvalidAuthenticatedTransition))
    else
      (s.(snapshot := s.snapshot.(user := if user.Some? then user else s.snapshot.user, email := email)), Ok(()))
  }

  function ReplacedToken(s: Session, token: Secret): (Session, Result<(), Error>) {
    if s.snapshot.state != Authenticated then (s, Err(InvalidAuthenticatedTransition))
    else (s.(snapshot := s.snapshot.(token := Some(token))), Ok(()))
  }

  /** Commands keep the session sound; a refused one changes nothing. */
  lemma CommandsKeepSound(s: Session, c: Command)
    requires IsSound(s.snapshot)
    ensures IsSound(Applied(s, c).0.snapshot)
    ensures Applied(s, c).1.Err? ==> Applied(s, c).0 == s
  {
  }

  /** Exactly when a command authenticates: only the mark does, out of a login that is
      under way. */
  lemma CommandAuthenticates(s: Session, c: Command)
    ensures s.snapshot.state != Authenticated && Applied(s, c).0.snapshot.state == Authenticated
            <==> c.MarkAuthenticated?
                 && s.snapshot.state in {AuthenticatingWithPassword, AuthenticatingWithToken, TwoFactorRequired}
    ensures s.snapshot.state != Authenticated && Applied(s, c).0.snapshot.state == Authenticated
            ==> Applied(s, c).0.snapshot.token == Some(c.authToken)
  {
  }

  /** The mark is accepted out of a login that is under way. */
  predicate SignsIn(s: Session, c: Command) {
    c.MarkAuthenticated? && s.snapshot.state in {AuthenticatingWithPassword, AuthenticatingWithToken, TwoFactorRequired}
  }

  predicate EndsSession(c: Command) {
    c == Logout || c.MarkAuthenticationFailed?
  }

  /** What becomes of the credentials, field by field: only signing in brings a token and
      a user, only the end of a session takes them away, with its address and timing. */
  lemma CredentialsExactly(s: Session, c: Command)
    ensures var before, after := s.snapshot, Applied(s, c).0.snapshot;
            && after.token == (if EndsSession(c) then None else if SignsIn(s, c) then Some(c.authToken) else before.token)
            && after.user == (if EndsSession(c) then None else if SignsIn(s, c) then c.user else before.user)
            && after.email == (if EndsSession(c) then None else before.email)
            && Applied(s, c).0.lifecycle == (if EndsSession(c) then None else s.lifecycle)
  {
  }

  /** What becomes of the open challenge and of the last error. A code only changes
      whether the device is to be trusted. */
  lemma ChallengeExactly(s: Session, c: Command)
    ensures var before, after := s.snapshot, Applied(s, c).0.snapshot;
            && after.challenge ==
               (if c.LoginWithPassword? || c.LoginWithToken? || EndsSession(c) || SignsIn(s, c) then None
                else if c.SubmitTwoFactorCode? && before.challenge.Some?
                then Some(Challenge(before.challenge.value.token, c.trustDevice))
                else before.challenge)
            && after.lastError ==
               (if c.MarkAuthenticationFailed? || c.MarkTwoFactorCodeInvalid? then c.message
                else if c.SubmitTwoFactorCode? || (c.MarkAuthenticated? && !SignsIn(s, c)) then before.lastError
                else None)
  {
  }

  /** Which state follows, and which command is refused. */
  lemma StateExactly(s: Session, c: Command)
    ensures var before, after := s.snapshot.state, Applied(s, c).0.snapshot.state;
            && (c == BeginLogin ==> after == AwaitingCredentials)
            && (c.LoginWithPassword? ==> after == AuthenticatingWithPassword)
            && (c.LoginWithToken? ==> after == AuthenticatingWithToken)
            && (c.SubmitTwoFactorCode? ==>
                  after == if s.snapshot.challenge.Some? then AuthenticatingWithPassword else before)
            && (c.MarkAuthenticated? ==> after == if SignsIn(s, c) then Authenticated else before)
            && (c.MarkAuthenticationFailed? ==> after == AuthFailed)
            && (c.MarkTwoFactorCodeInvalid? ==> after == before)
            && (c == Logout ==> after == LoggedOut)
    ensures Applied(s, c).1 == Err(NoPendingChallenge) <==> c.SubmitTwoFactorCode? && s.snapshot.challenge.None?
    ensures Applied(s, c).1 == Err(InvalidAuthenticatedTransition) <==> c.MarkAuthenticated? && !SignsIn(s, c)
  {
  }

  /** What recording a refresh changes: the token, and the timing, which starts anew
      with the whole seconds of the policy's lifetime. */
  lemma RecordExactly(s: Session, now: nat, policy: Policy, token: Secret)
    ensures var (after, r) := RecordedRefresh(s, now, policy, token);
            if s.snapshot.state == Authenticated then
              && r.Ok? && after.snapshot == s.snapshot.(token := Some(token))
              && after.lifecycle.Some?
              && var l := after.lifecycle.value;
              && l.establishedAt == now && l.lastUsedAt == now
              && l.expiresAt == Min(now + policy.lifetime / 1_000_000_000, 0xFFFF_FFFF_FFFF_FFFF)
              && (l.credentialsRetained <==> s.lifecycle.Some? && s.lifecycle.value.credentialsRetained)
            else r == Err(InvalidAuthenticatedTransition) && after == s
  {
  }

  /** What a look-up and a new token change. An unknown user leaves the known one; an
      unknown address does not. */
  lemma UpdatesExactly(s: Session, user: Option<nat>, email: Option<string>, token: Secret)
    ensures var (after, r) := UpdatedUserinfo(s, user, email);
            && (r.Ok? <==> s.snapshot.state == Authenticated) && (r.Err? ==> after == s)
            && (r.Ok? ==>
                  && after.snapshot.email == email
                  && after.snapshot.user == (if user == None then s.snapshot.user else user)
                  && after == s.(snapshot := s.snapshot.(user := after.snapshot.user, email := email)))
    ensures var (after, r) := ReplacedToken(s, token);
            && (r.Ok? <==> s.snapshot.state == Authenticated) && (r.Err? ==> after == s)
            && (r.Ok? ==> after.snapshot.token == Some(token) && after == s.(snapshot := s.snapshot.(token := Some(token))))
  {
  }

  // ----- The manager -----

  class SessionManager {
    var snapshot: Snapshot
    var lifecycle: Option<Lifecycle>

    ghost function Contents(): (s: Session)
      reads this
    {
      Session(snapshot, lifecycle)
    }

    constructor ()
      ensures Contents() == Session(NOBODY, None)
    {
      snapshot, lifecycle := NOBODY, None;
    }

    method Apply(c: Command) returns (r: Result<Event, Error>)
      modifies this
      ensures (Contents(), r) == Applied(old(Contents()), c)
      ensures old(IsSound(snapshot)) ==> IsSound(snapshot)
    {
      match c {
        case BeginLogin =>
          snapshot := snapshot.(state := AwaitingCredentials, lastError := None);
          return Ok(LoginStarted);
        case LoginWithPassword(_, _) =>
          snapshot := snapshot.(state := AuthenticatingWithPassword, challenge := None, lastError := None);
          return Ok(LoginStarted);
        case LoginWithToken(_) =>
          snapshot := snapshot.(state := AuthenticatingWithToken, challenge := None, lastError := None);
          return Ok(LoginStarted);
        case SubmitTwoFactorCode(_, trust) =>
          if snapshot.challenge.None? {
            return Err(NoPendingChallenge);
          }
          snapshot := snapshot.(state := AuthenticatingWithPassword);
          snapshot := snapshot.(challenge := Some(snapshot.challenge.value.(trustDevice := trust)));
          return Ok(LoginStarted);
        case MarkAuthenticated(user, token) =>
          match snapshot.state {
            case AuthenticatingWithPassword | AuthenticatingWithToken | TwoFactorRequired =>
              snapshot := snapshot.(
                state := Authenticated, user := user, token := Some(token), challenge := None, lastError := None);
              return Ok(LoginSucceeded(user));
            case _ =>
              return Err(InvalidAuthenticatedTransition);
          }
        case MarkAuthenticationFailed(message) =>
          snapshot := Snapshot(AuthFailed, None, None, None, None, message);
          lifecycle := None;
          return Ok(LoginFailed(message));
        case MarkTwoFactorCodeInvalid(message) =>
          snapshot := snapshot.(lastError := message);
          return Ok(LoginFailed(message));
        case Logout =>
          snapshot := Snapshot(LoggedOut, None, None, None, None, None);
          lifecycle := None;
          return Ok(SessionEnded);
      }
    }

    method IssueTwoFactorChallenge(token: Secret, trust: bool) returns (e: Event)
      modifies this
      ensures Contents() == Challenged(old(Contents()), token, trust) && e == TwoFactorChallengeIssued
      ensures old(IsSound(snapshot)) ==> IsSound(snapshot)
    {
      snapshot := snapshot.(
        state := TwoFactorRequired, challenge := Some(Challenge(token, trust)), lastError := None);
      return TwoFactorChallengeIssued;
    }

    /** Attaches timing, whatever the state. */
    method AttachLifecycle(now: nat, policy: Policy, retained: bool)
      modifies this`lifecycle
      ensures lifecycle == Some(NewLifecycle(now, policy, retained))
    {
      lifecycle := Some(NewLifecycle(now, policy, retained));
    }

    method MarkUsed(now: nat)
      modifies this`lifecycle
      ensures lifecycle == Used(old(lifecycle), now)
    {
      if lifecycle.Some? {
        lifecycle := Some(lifecycle.value.(lastUsedAt := now));
      }
    }

    method RecordRefresh(now: nat, policy: Policy, token: Secret) returns (r: Result<(), Error>)
      modifies this
      ensures (Contents(), r) == RecordedRefresh(old(Contents()), now, policy, token)
      ensures old(IsSound(snapshot)) ==> IsSound(snapshot)
    {
      if snapshot.state != Authenticated {
        return Err(InvalidAuthenticatedTransition);
      }
      snapshot := snapshot.(token := Some(token));
      if lifecycle.Some? {
        lifecycle := Some(Refreshed(lifecycle.value, now, policy));
      } else {
        lifecycle := Some(NewLifecycle(now, policy, false));
      }
      return Ok(());
    }

    method Revoke() returns (e: Event)
      modifies this
      ensures Contents() == Session(NOBODY, None) && e == SessionEnded
    {
      snapshot, lifecycle := NOBODY, None;
      return SessionEnded;
    }

    method UpdateUserinfo(user: Option<nat>, email: Option<string>) returns (r: Result<(), Error>)
      modifies this`snapshot
      ensures (Contents(), r) == UpdatedUserinfo(old(Contents()), user, email)
      ensures old(IsSound(snapshot)) ==> IsSound(snapshot)
    {
      if snapshot.state != Authenticated {
        return Err(InvalidAuthenticatedTransition);
      }
      if user.Some? {
        snapshot := snapshot.(user := user);
      }
      snapshot := snapshot.(email := email);
      return Ok(());
    }

    method ReplaceAuthToken(token: Secret) returns (r: Result<(), Error>)
      modifies this`snapshot
      ensures (Contents(), r) == ReplacedToken(old(Contents()), token)
      ensures old(IsSound(snapshot)) ==> IsSound(snapshot)
    {
      if snapshot.state != Authenticated {
        return Err(InvalidAuthenticatedTransition);
      }
      snapshot := snapshot.(token := Some(token));
      return Ok(());
    }
  }

  function Used(lifecycle: Option<Lifecycle>, now: nat): Option<Lifecycle> {
    if lifecycle.Some? then Some(lifecycle.value.(lastUsedAt := now)) else None
  }
}
